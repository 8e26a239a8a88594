/** The table layout helpers of the table generator (log2tbl.py): laying a
    list of cells out in rows of a fixed width, naming the sixteen columns
    of the incantation tables by four filter bits, and stripping every
    extension from the log's file name to get the chip name. */
module Log2Tbl {
  import opened Strings
  import opened Generic

  // ---------------------------------------------------------------------------
  // `fill_up`

  /** One row as `fill_up` writes it: the chunk joined by `sep`, one more
      `sep` per missing cell, then `end`. */
  function Line(chunk: seq<string>, sep: string, end: string, nl: nat): string {
    Join(chunk, sep) + Repeat(sep, nl - |chunk|) + end
  }

  /** What `fill_up(l, sep, end, nl)` returns. */
  function Filled(l: seq<string>, sep: string, end: string, nl: nat): string
    requires nl > 0
    decreases |l|
  {
    if |l| == 0 then ""
    else
      var k := Chunk(|l|, nl);
      Line(l[..k], sep, end, nl) + Filled(l[k..], sep, end, nl)
  }

  /** The loop of `fill_up`. */
  method FillUp(l: seq<string>, sep: string, end: string, nl: nat) returns (s: string)
    requires nl > 0
    ensures s == Filled(l, sep, end, nl)
  {
    s := "";
    var rest := l;
    while |rest| > 0
      invariant s + Filled(rest, sep, end, nl) == Filled(l, sep, end, nl)
      decreases |rest|
    {
      var k := Chunk(|rest|, nl);
      var chunk := rest[..k];
      var line := Join(chunk, sep);
      var row := line + Repeat(sep, nl - |chunk|) + end;
      assert Filled(rest, sep, end, nl) == row + Filled(rest[k..], sep, end, nl);
      Reassociate(s, row, Filled(rest[k..], sep, end, nl));
      s := s + row;
      rest := rest[k..];
    }
  }

  lemma Reassociate(a: string, b: string, c: string)
    ensures (a + b) + c == a + (b + c)
  {
  }

  /** `n` empty cells. */
  function Blanks(n: nat): (r: seq<string>)
    ensures |r| == n && forall i :: 0 <= i < n ==> r[i] == ""
  {
    seq(n, _ => "")
  }

  /** The table as cells: rows of `nl` cells, in order, the last one padded
      with empty cells. */
  function Rows(l: seq<string>, nl: nat): seq<seq<string>>
    requires nl > 0
    decreases |l|
  {
    if |l| == 0 then []
    else
      var k := Chunk(|l|, nl);
      [l[..k] + Blanks(nl - k)] + Rows(l[k..], nl)
  }

  /** The rows one after the other. */
  function Flatten(rows: seq<seq<string>>): seq<string>
    decreases |rows|
  {
    if |rows| == 0 then [] else rows[0] + Flatten(rows[1..])
  }

  /** How many empty cells pad the last row of `len` cells in rows of `nl`. */
  function Padding(len: nat, nl: nat): (p: nat)
    requires nl > 0
    ensures p < nl
    ensures len == 0 ==> p == 0
    decreases len
  {
    if len == 0 then 0 else if len <= nl then nl - len else Padding(len - nl, nl)
  }

  /** Every row has `nl` cells. */
  lemma {:induction false} RowsWidth(l: seq<string>, nl: nat)
    requires nl > 0
    ensures forall i :: 0 <= i < |Rows(l, nl)| ==> |Rows(l, nl)[i]| == nl
    decreases |l|
  {
    if |l| > 0 {
      var k := Chunk(|l|, nl);
      var rows, tail := Rows(l, nl), Rows(l[k..], nl);
      RowsWidth(l[k..], nl);
      assert rows == [l[..k] + Blanks(nl - k)] + tail;
      forall i | 0 <= i < |rows| ensures |rows[i]| == nl {
        if i > 0 {
          assert rows[i] == tail[i - 1];
        }
      }
    }
  }

  /** Read row by row, the table is the list followed by fewer than `nl`
      empty cells. */
  lemma {:induction false} RowsFlatten(l: seq<string>, nl: nat)
    requires nl > 0
    ensures Flatten(Rows(l, nl)) == l + Blanks(Padding(|l|, nl))
    decreases |l|
  {
    if |l| > 0 {
      var k := Chunk(|l|, nl);
      var rows, tail := Rows(l, nl), Rows(l[k..], nl);
      RowsFlatten(l[k..], nl);
      assert rows[0] == l[..k] + Blanks(nl - k) && rows[1..] == tail;
      if |l| <= nl {
        assert l[..k] == l && tail == [];
      } else {
        assert l == l[..k] + l[k..];
      }
    }
  }

  /** There are `ceil(len(l) / nl)` rows: together they hold the list and
      fewer than `nl` further cells. */
  lemma {:induction false} RowsCount(l: seq<string>, nl: nat)
    requires nl > 0
    ensures |Rows(l, nl)| * nl == |l| + Padding(|l|, nl)
    ensures |l| > 0 ==> (|Rows(l, nl)| - 1) * nl < |l| <= |Rows(l, nl)| * nl
    decreases |l|
  {
    if |l| > 0 {
      var k := Chunk(|l|, nl);
      var tail := Rows(l[k..], nl);
      RowsCount(l[k..], nl);
      assert |Rows(l, nl)| == |tail| + 1;
      MulSucc(|tail|, nl);
    }
  }

  lemma MulSucc(a: nat, n: nat)
    ensures (a + 1) * n == a * n + n
  {
  }

  /** The text of the rows: each row's cells joined by `sep`, then `end`. */
  function RowTexts(rows: seq<seq<string>>, sep: string, end: string): string
    decreases |rows|
  {
    if |rows| == 0 then "" else Join(rows[0], sep) + end + RowTexts(rows[1..], sep, end)
  }

  /** `fill_up` writes the rows: every row, the padded last one too, is its
      `nl` cells joined by `sep` and closed by `end`. */
  lemma {:induction false} FilledRows(l: seq<string>, sep: string, end: string, nl: nat)
    requires nl > 0
    ensures Filled(l, sep, end, nl) == RowTexts(Rows(l, nl), sep, end)
    decreases |l|
  {
    if |l| > 0 {
      var k := Chunk(|l|, nl);
      FilledRows(l[k..], sep, end, nl);
      PadJoin(l[..k], sep, nl - k);
      assert Rows(l, nl)[1..] == Rows(l[k..], nl);
    }
  }

  /** Empty cells after a non-empty row add one separator each. */
  lemma {:induction false} PadJoin(chunk: seq<string>, sep: string, m: nat)
    requires |chunk| > 0
    ensures Join(chunk + Blanks(m), sep) == Join(chunk, sep) + Repeat(sep, m)
    decreases m
  {
    if m > 0 {
      assert chunk + Blanks(m) == (chunk + Blanks(m - 1)) + [""];
      JoinSnoc(chunk + Blanks(m - 1), "", sep);
      PadJoin(chunk, sep, m - 1);
      RepeatSnoc(sep, m);
    } else {
      assert chunk + Blanks(0) == chunk;
    }
  }

  lemma {:induction false} JoinSnoc(parts: seq<string>, x: string, sep: string)
    requires |parts| > 0
    ensures Join(parts + [x], sep) == Join(parts, sep) + sep + x
    decreases |parts|
  {
    if |parts| == 1 {
      assert parts + [x] == [parts[0], x];
      JoinTwo(parts[0], x, sep);
    } else {
      assert (parts + [x])[1..] == parts[1..] + [x];
      JoinSnoc(parts[1..], x, sep);
    }
  }

  lemma {:induction false} RepeatSnoc(s: string, n: nat)
    requires n > 0
    ensures Repeat(s, n) == Repeat(s, n - 1) + s
    decreases n
  {
    if n > 1 {
      RepeatSnoc(s, n - 1);
    }
  }

  /** With a one-character separator that no cell holds, every row splits
      back into exactly its `nl` cells: it has `nl - 1` separators. */
  lemma RowCells(l: seq<string>, c: char, nl: nat, i: nat)
    requires nl > 0
    requires forall k :: 0 <= k < |l| ==> c !in l[k]
    requires i < |Rows(l, nl)|
    ensures Split(Join(Rows(l, nl)[i], [c]), c) == Rows(l, nl)[i]
    ensures |Split(Join(Rows(l, nl)[i], [c]), c)| == nl
  {
    RowsWidth(l, nl);
    RowCellsFree(l, c, nl, i);
    SplitJoin(Rows(l, nl)[i], c);
  }

  /** No cell of a row holds a character that no item holds. */
  lemma {:induction false} RowCellsFree(l: seq<string>, c: char, nl: nat, i: nat)
    requires nl > 0
    requires forall k :: 0 <= k < |l| ==> c !in l[k]
    requires i < |Rows(l, nl)|
    ensures forall k :: 0 <= k < |Rows(l, nl)[i]| ==> c !in Rows(l, nl)[i][k]
    decreases |l|
  {
    var k := Chunk(|l|, nl);
    var row := l[..k] + Blanks(nl - k);
    if i == 0 {
      assert Rows(l, nl)[0] == row;
      forall j | 0 <= j < |row| ensures c !in row[j] {
        if j < k {
          assert row[j] == l[j];
        }
      }
    } else {
      assert Rows(l, nl)[i] == Rows(l[k..], nl)[i - 1];
      assert forall j :: 0 <= j < |l[k..]| ==> l[k..][j] == l[k + j];
      RowCellsFree(l[k..], c, nl, i - 1);
    }
  }

  // ---------------------------------------------------------------------------
  // The sixteen columns of `incantations`

  /** `(i & 0b1000) >> 3`, …, `i & 0b0001`: the four filter bits of column `i`. */
  function ColumnBits(i: nat): (b: (nat, nat, nat, nat))
    requires i < 16
    ensures b.0 <= 1 && b.1 <= 1 && b.2 <= 1 && b.3 <= 1
    ensures i == 8 * b.0 + 4 * b.1 + 2 * b.2 + b.3
  {
    var x := i as bv8;
    (((x & 0x8) >> 3) as nat, ((x & 0x4) >> 2) as nat, ((x & 0x2) >> 1) as nat, (x & 0x1) as nat)
  }

  /** Which of the four filters (memory stress, general bank conflicts,
      barrier, random threads) a column asks to hold; a `false` asks for
      the filter's negation. */
  function Combination(i: nat): (bool, bool, bool, bool)
    requires i < 16
  {
    var b := ColumnBits(i);
    (b.0 == 1, b.1 == 1, b.2 == 1, b.3 == 1)
  }

  function Bit(b: bool): nat {
    if b then 1 else 0
  }

  /** The column that asks for the filters `c`. */
  function ColumnOf(c: (bool, bool, bool, bool)): (i: nat)
    ensures i < 16
  {
    8 * Bit(c.0) + 4 * Bit(c.1) + 2 * Bit(c.2) + Bit(c.3)
  }

  /** The sixteen columns ask for each combination of the filters exactly
      once: every combination has its column, and a column is the one of
      its own combination. */
  lemma ColumnsCover(c: (bool, bool, bool, bool))
    ensures Combination(ColumnOf(c)) == c
    ensures forall i :: 0 <= i < 16 && Combination(i) == c ==> i == ColumnOf(c)
  {
    var b := ColumnBits(ColumnOf(c));
    assert b.0 == Bit(c.0) && b.1 == Bit(c.1) && b.2 == Bit(c.2) && b.3 == Bit(c.3);
  }

  // ---------------------------------------------------------------------------
  // The chip name: `os.path.basename`, then `os.path.splitext` until nothing
  // changes.

  /** `s.rfind(c)`: the last position of `c`, or -1. */
  function RFind(s: string, c: char): (r: int)
    ensures -1 <= r < |s|
    ensures r >= 0 ==> s[r] == c
    ensures forall k :: r < k < |s| ==> s[k] != c
    decreases |s|
  {
    if |s| == 0 then -1
    else if s[|s| - 1] == c then |s| - 1
    else RFind(s[..|s| - 1], c)
  }

  /** `os.path.basename(p)`: what follows the last `/`. */
  function BaseName(p: string): (r: string)
    ensures '/' !in r
    ensures EndsWith(p, r)
    ensures |r| < |p| ==> p[|p| - |r| - 1] == '/'
  {
    p[RFind(p, '/') + 1..]
  }

  /** `os.path.splitext(p)[0]`: the path without its last extension. The
      last `.` starts an extension when it lies after the last `/` and some
      character other than `.` comes before it in the file name, so leading
      dots never count. */
  function Root(p: string): (r: string)
    ensures r == p || (|r| < |p| && r == p[..|r|] && p[|r|] == '.')
  {
    var sep, dot := RFind(p, '/'), RFind(p, '.');
    if dot > sep && exists k :: sep + 1 <= k < dot && p[k] != '.' then p[..dot] else p
  }

  /** The name again and again without its last extension until none is
      left. */
  function StripAll(p: string): (r: string)
    decreases |p|
  {
    var q := Root(p);
    if q == p then p else StripAll(q)
  }

  /** The chip-name loop: it ends because every change shortens the name. */
  method ChipName(log: string) returns (chip: string)
    ensures chip == StripAll(BaseName(log))
  {
    chip := BaseName(log);
    var chipOld := chip;
    while true
      invariant chip == chipOld
      invariant StripAll(chip) == StripAll(BaseName(log))
      decreases |chipOld|
    {
      chip := Root(chip);
      if chip == chipOld {
        break;
      }
      chipOld := chip;
    }
  }

  /** The chip name is a prefix of the file name, and has no extension
      left: one more `splitext` changes nothing. */
  lemma {:induction false} StripAllFixpoint(p: string)
    ensures Root(StripAll(p)) == StripAll(p)
    ensures StartsWith(p, StripAll(p))
    decreases |p|
  {
    var q := Root(p);
    if q != p {
      StripAllFixpoint(q);
      assert p[..|StripAll(q)|] == q[..|StripAll(q)|];
    }
  }

  /** A name has an extension when a `.` follows some other character. */
  predicate HasExt(p: string) {
    exists j, d :: 0 <= j < d < |p| && p[j] != '.' && p[d] == '.'
  }

  /** For a file name (no `/`), `splitext` changes the name exactly when it
      has an extension; so the chip name has none. */
  lemma RootChanges(p: string)
    requires '/' !in p
    ensures Root(p) != p <==> HasExt(p)
  {
    var sep, dot := RFind(p, '/'), RFind(p, '.');
    assert sep == -1;
    if HasExt(p) {
      var j, d :| 0 <= j < d < |p| && p[j] != '.' && p[d] == '.';
      assert d <= dot;
      assert |Root(p)| < |p|;
    }
    if Root(p) != p {
      var k :| sep + 1 <= k < dot && p[k] != '.';
      assert p[k] != '.' && p[dot] == '.';
    }
  }

  lemma ChipNameNoExt(log: string)
    ensures !HasExt(StripAll(BaseName(log)))
    ensures '/' !in StripAll(BaseName(log))
  {
    var b := BaseName(log);
    StripAllFixpoint(b);
    var c := StripAll(b);
    assert c == b[..|c|];
    RootChanges(c);
  }
}
