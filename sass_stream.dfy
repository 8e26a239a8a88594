/** The instruction stream the checker works on (optcheck.py `isinst` and the
    first half of `check_spec`): the lines of cuobjdump output that hold an
    instruction, with the address and encoding comments removed and the
    surrounding white space trimmed. */
module SassStream {
  import opened Wrappers
  import opened Strings

  // ---------------------------------------------------------------------------
  // `isinst`: the regular expression `^\s+/\*.*[^0-9a-fxA-FX/\* ]`.

  /** The length of the leading white-space run. */
  function LeadingSpace(s: string): (k: nat)
    ensures k <= |s|
    ensures forall i :: 0 <= i < k ==> IsSpace(s[i])
    ensures k < |s| ==> !IsSpace(s[k])
    decreases |s|
  {
    if |s| > 0 && IsSpace(s[0]) then 1 + LeadingSpace(s[1..]) else 0
  }

  /** The characters of an address or encoding comment such as `/*0a18*/` or
      `/* 0x2800440400005de4 */`. */
  predicate InAddressClass(c: char) {
    ('0' <= c <= '9') || ('a' <= c <= 'f') || ('A' <= c <= 'F') ||
    c == 'x' || c == 'X' || c == '/' || c == '*' || c == ' '
  }

  /** `isinst`. Since the white-space run cannot absorb the `/` after it, the
      `\s+` takes the whole leading run. The `.*` cannot cross a line feed,
      but a line feed is itself outside the class, so the first character
      outside the class always lies within reach: the expression matches
      exactly when some character after the comment opener is outside the class. */
  predicate IsInst(s: string) {
    var k := LeadingSpace(s);
    && k >= 1
    && k + 2 <= |s| && s[k] == '/' && s[k + 1] == '*'
    && exists j :: k + 2 <= j < |s| && !InAddressClass(s[j])
  }

  /** An indented line that starts with an address comment and holds some
      text outside the comment alphabet is an instruction line... */
  lemma InstructionLine(ws: string, rest: string, j: nat)
    requires |ws| >= 1 && forall i :: 0 <= i < |ws| ==> IsSpace(ws[i])
    requires j < |rest| && !InAddressClass(rest[j])
    ensures IsInst(ws + "/*" + rest)
  {
    var s := ws + "/*" + rest;
    assert s[|ws|] == '/';
    assert !IsSpace(s[|ws|]);
    LeadingSpaceOf(ws, "/*" + rest);
    assert s == ws + ("/*" + rest);
    assert s[|ws| + 2 + j] == rest[j];
  }

  /** ... and one whose text after the comment opener lies wholly in the
      comment alphabet (an encoding-only line) is not. */
  lemma EncodingLine(ws: string, rest: string)
    requires |ws| >= 1 && forall i :: 0 <= i < |ws| ==> IsSpace(ws[i])
    requires forall i :: 0 <= i < |rest| ==> InAddressClass(rest[i])
    ensures !IsInst(ws + "/*" + rest)
  {
    var s := ws + "/*" + rest;
    LeadingSpaceOf(ws, "/*" + rest);
    assert s == ws + ("/*" + rest);
    forall j | |ws| + 2 <= j < |s| ensures InAddressClass(s[j]) {
      assert s[j] == rest[j - |ws| - 2];
    }
  }

  lemma {:induction false} LeadingSpaceOf(ws: string, t: string)
    requires forall i :: 0 <= i < |ws| ==> IsSpace(ws[i])
    requires |t| > 0 && !IsSpace(t[0])
    ensures LeadingSpace(ws + t) == |ws|
    decreases |ws|
  {
    if |ws| > 0 {
      assert (ws + t)[1..] == ws[1..] + t;
      LeadingSpaceOf(ws[1..], t);
    }
  }

  /** `list(filter(isinst, lis))` */
  function FilterInst(lines: seq<string>): (r: seq<string>)
    ensures |r| <= |lines|
    ensures forall i :: 0 <= i < |r| ==> IsInst(r[i]) && r[i] in lines
    ensures forall l :: l in lines && IsInst(l) ==> l in r
    decreases |lines|
  {
    if |lines| == 0 then []
    else
      var rest := FilterInst(lines[1..]);
      assert forall l :: l in lines[1..] ==> l in lines;
      if IsInst(lines[0]) then [lines[0]] + rest else rest
  }

  // ---------------------------------------------------------------------------
  // `re.sub("/\*[^*/]*\*/", "", line)`

  /** A comment the expression removes: `/*`, a body without `*` or `/`, `*/`. */
  predicate IsComment(c: string) {
    && |c| >= 4
    && c[0] == '/' && c[1] == '*' && c[|c| - 2] == '*' && c[|c| - 1] == '/'
    && forall i :: 2 <= i < |c| - 2 ==> c[i] != '*' && c[i] != '/'
  }

  /** The first index at or after `i` holding `*` or `/`, else `|s|`. */
  function BodyEnd(s: string, i: nat): (e: nat)
    requires i <= |s|
    ensures i <= e <= |s|
    ensures forall k :: i <= k < e ==> s[k] != '*' && s[k] != '/'
    ensures e < |s| ==> s[e] == '*' || s[e] == '/'
    decreases |s| - i
  {
    if i == |s| || s[i] == '*' || s[i] == '/' then i else BodyEnd(s, i + 1)
  }

  /** The length of the comment the expression matches at the start of `s`;
      the body run is maximal, so no shorter match exists either. */
  function CommentAt(s: string): (r: Option<nat>)
    ensures r.Some? ==> r.value <= |s| && IsComment(s[..r.value])
    ensures r.None? ==> forall e :: 0 <= e <= |s| ==> !IsComment(s[..e])
  {
    if |s| >= 2 && s[0] == '/' && s[1] == '*' then
      var e := BodyEnd(s, 2);
      if e + 1 < |s| && s[e] == '*' && s[e + 1] == '/' then Some(e + 2)
      else
        assert forall e' :: 0 <= e' <= |s| ==> !IsComment(s[..e']) by {
          forall e' | 0 <= e' <= |s| && IsComment(s[..e'])
            ensures false
          {
            NoCommentBeyond(s, e, e');
          }
        }
        None
    else
      None
  }

  lemma NoCommentBeyond(s: string, e: nat, e': nat)
    requires |s| >= 2 && s[0] == '/' && s[1] == '*'
    requires 2 <= e <= |s|
    requires forall k :: 2 <= k < e ==> s[k] != '*' && s[k] != '/'
    requires e < |s| ==> s[e] == '*' || s[e] == '/'
    requires !(e + 1 < |s| && s[e] == '*' && s[e + 1] == '/')
    requires e' <= |s|
    ensures !IsComment(s[..e'])
  {
  }

  /** Every match removed, scanning from the left. */
  function StripComments(s: string): (r: string)
    ensures |r| <= |s|
    decreases |s|
  {
    if |s| == 0 then s
    else match CommentAt(s)
      case Some(e) => StripComments(s[e..])
      case None => [s[0]] + StripComments(s[1..])
  }

  /** A line without a comment opener is left as it is. */
  lemma {:induction false} StripCommentsFree(s: string)
    requires !Contains(s, "/*")
    ensures StripComments(s) == s
    decreases |s|
  {
    if |s| > 0 {
      assert !StartsWith(s, "/*");
      assert CommentAt(s).None?;
      assert !Contains(s[1..], "/*");
      StripCommentsFree(s[1..]);
    }
  }

  /** A leading comment disappears and the scan resumes right after it. */
  lemma StripLeadingComment(c: string, rest: string)
    requires IsComment(c)
    ensures StripComments(c + rest) == StripComments(rest)
  {
    var s := c + rest;
    var e := BodyEnd(s, 2);
    assert s[|c| - 2] == '*';
    assert forall k :: 2 <= k < |c| - 2 ==> s[k] == c[k];
    assert e == |c| - 2;
    assert s[|c|..] == rest;
  }

  /** The text each instruction line is reduced to: comments removed, then
      white space trimmed. */
  function CleanLine(s: string): string {
    Strip(StripComments(s))
  }

  /** A cuobjdump instruction line reduces to the instruction text:
      indentation and the address comment go. */
  lemma CleanAddressedLine(ws: string, addr: string, ins: string)
    requires forall i :: 0 <= i < |ws| ==> IsSpace(ws[i])
    requires IsComment("/*" + addr + "*/")
    requires !Contains(ins, "/*") && |ins| > 0 && !IsSpace(ins[0]) && !IsSpace(ins[|ins| - 1])
    ensures CleanLine(ws + "/*" + addr + "*/" + ins) == ins
    decreases |ws|
  {
    var c := "/*" + addr + "*/";
    if |ws| == 0 {
      assert ws + "/*" + addr + "*/" + ins == c + ins;
      StripLeadingComment(c, ins);
      StripCommentsFree(ins);
      StripNoSpace(ins);
    } else {
      var s := ws + "/*" + addr + "*/" + ins;
      assert s == ws + (c + ins);
      StripWhiteOverComments(ws, c + ins);
      StripLeadingComment(c, ins);
      StripCommentsFree(ins);
      LStripOver(ws, ins);
      StripNoSpace(ins);
    }
  }

  /** Removing comments keeps leading white space that contains no `/`. */
  lemma {:induction false} StripWhiteOverComments(ws: string, t: string)
    requires forall i :: 0 <= i < |ws| ==> IsSpace(ws[i])
    ensures StripComments(ws + t) == ws + StripComments(t)
    decreases |ws|
  {
    if |ws| > 0 {
      var rest := ws[1..];
      calc {
        StripComments(ws + t);
        { assert ws + t == [ws[0]] + (rest + t); }
        StripComments([ws[0]] + (rest + t));
        { StripSpaceHead(ws[0], rest + t); }
        [ws[0]] + StripComments(rest + t);
        { StripWhiteOverComments(rest, t); }
        [ws[0]] + (rest + StripComments(t));
        { assert ws == [ws[0]] + rest; }
        ws + StripComments(t);
      }
    } else {
      assert ws + t == t;
    }
  }

  /** A leading white-space character is kept. */
  lemma StripSpaceHead(c: char, rest: string)
    requires IsSpace(c)
    ensures StripComments([c] + rest) == [c] + StripComments(rest)
  {
    var s := [c] + rest;
    assert s[1..] == rest;
    StripCommentsPlain(s);
  }

  /** A first character other than `/` is kept and the scan moves past it. */
  lemma StripCommentsPlain(s: string)
    requires |s| > 0 && s[0] != '/'
    ensures StripComments(s) == [s[0]] + StripComments(s[1..])
  {
    assert CommentAt(s) == None;
  }

  lemma {:induction false} LStripOver(ws: string, t: string)
    requires forall i :: 0 <= i < |ws| ==> IsSpace(ws[i])
    requires |t| > 0 && !IsSpace(t[0])
    ensures LStrip(ws + t) == t
    decreases |ws|
  {
    if |ws| == 0 {
      assert ws + t == t;
    } else {
      assert (ws + t)[1..] == ws[1..] + t;
      LStripOver(ws[1..], t);
    }
  }
}
